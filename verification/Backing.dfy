/** How physical memory carries the page maps of a kernel state and the words its processes
    are closed by, and why one process's allocations and mappings leave those of every other
    process alone: they lie in different heap runs. */
module Backing {
  import opened Machine
  import opened HeapRuns
  import opened PageTables
  import opened System
  import opened Invariants
  import opened Preservation

  const ELF_MEMORY := 112 // offset of elf_memory in struct elf_file

  /** Each process's page tables are in memory and spell out its page map, and the word
      elf_close will take for the address of its file is the one its load put there. */
  ghost predicate Backed(k: State, m: Mem) {
    forall i :: Occupied(k, i) ==> BackedProc(k.procs[i].value, m)
  }

  ghost predicate BackedProc(p: Proc, m: Mem) {
    Installed(m, p.dir) && p.pages == Flat(m, p.dir) && ElfWord(m, p.elf, p.memory)
  }

  /** Word elf_memory of the struct elf_file, or what is taken for one, in block b. */
  ghost predicate ElfWord(m: Mem, b: nat, word: Word) {
    b < HEAP_BLOCKS && Cell(m, Addr(b) + ELF_MEMORY) == word
  }

  /** The blocks the kernel relies on for a process. */
  ghost function Trusted(p: Proc): set<nat> {
    DirBlocks(p.dir) + {p.elf}
  }

  lemma TrustedParts(p: Proc)
    ensures DirBlocks(p.dir) <= Trusted(p) && p.elf in Trusted(p) && Trusted(p) <= Core(p)
  {
    hide DirBlocks;
  }

  lemma ElfWordKept(m: Mem, m': Mem, b: nat, word: Word, s: set<nat>)
    requires ElfWord(m, b, word) && SameExcept(m, m', s) && b !in s
    ensures ElfWord(m', b, word)
  {
    assert (Addr(b) + ELF_MEMORY) / PAGE_SIZE == BlockFrame(b);
    assert m'[BlockFrame(b)] == m[BlockFrame(b)];
  }

  /** Every such word in the first blocks of the runs r is as it was. */
  ghost predicate KeepsWords(r: Runs, m: Mem, m': Mem) {
    forall b: nat, word: Word :: b in r && ElfWord(m, b, word) ==> ElfWord(m', b, word)
  }

  lemma KeepsWordsApart(r: Runs, m: Mem, m': Mem, s: set<nat>)
    requires SameExcept(m, m', s) && s !! r.Keys
    ensures KeepsWords(r, m, m')
  {
    hide ElfWord, SameExcept;
    forall b: nat, word: Word | b in r && ElfWord(m, b, word) ensures ElfWord(m', b, word) {
      ElfWordKept(m, m', b, word, s);
    }
  }

  lemma KeepsWordsTrans(r: Runs, r': Runs, m: Mem, m1: Mem, m2: Mem)
    requires KeepsWords(r, m, m1) && KeepsWords(r', m1, m2) && r.Keys <= r'.Keys
    ensures KeepsWords(r, m, m2)
  {
    hide ElfWord;
  }

  /** A free stretch of blocks holds the start of no run. */
  lemma FreeHoldsNoStart(r: Runs, b: nat, n: nat)
    requires Partition(r, HEAP_BLOCKS) && FreeAt(r, b, n)
    ensures RunBlocks(b, n) !! r.Keys
  {
    forall c | c in r ensures c !in RunBlocks(b, n) {
      assert Covers(r, c, c);
      assert InSomeRun(r, c);
    }
  }

  /** A change of memory away from what the kernel relies on. */
  lemma BackedElsewhere(p: Proc, m: Mem, m': Mem, s: set<nat>)
    requires BackedProc(p, m) && SameExcept(m, m', s) && s !! Trusted(p)
    ensures BackedProc(p, m')
  {
    hide ElfWord, SameExcept, Flat, Installed, DirBlocks;
    TrustedParts(p);
    MapElsewhere(p.dir, m, m', s);
    ElfWordKept(m, m', p.elf, p.memory, s);
  }

  lemma MapElsewhere(d: Dir, m: Mem, m': Mem, s: set<nat>)
    requires Installed(m, d) && SameExcept(m, m', s) && s !! DirBlocks(d)
    ensures Installed(m', d) && Flat(m', d) == Flat(m, d)
  {
    InstalledFrame(m, m', d, s);
  }

  /** Writing into a run that was free disturbs no page map. */
  lemma BackedFresh(k: State, m: Mem, m': Mem, b: nat, n: nat)
    requires Inv(k) && Backed(k, m) && FitsAt(k.runs, b, n) && SameExcept(m, m', RunBlocks(b, n))
    ensures Backed(k, m')
  {
    hide BackedProc, LedgerMapped, Accounted, RingOk;
    forall i | Occupied(k, i) ensures BackedProc(k.procs[i].value, m') {
      FreshMisses(k.runs, b, n, k.procs[i].value);
      BackedElsewhere(k.procs[i].value, m, m', RunBlocks(b, n));
    }
  }

  lemma FreshMisses(r: Runs, b: nat, n: nat, p: Proc)
    requires Partition(r, HEAP_BLOCKS) && PartsLive(r, p) && FitsAt(r, b, n)
    ensures RunBlocks(b, n) !! Trusted(p)
  {
    forall c | c in Trusted(p) ensures c !in RunBlocks(b, n) {
      assert c in r && Covers(r, c, c);
      assert InSomeRun(r, c);
    }
  }

  /** Writing into process i's page tables changes nothing another process relies on. */
  lemma BackedMap(k: State, m: Mem, m': Mem, i: nat)
    requires Inv(k) && Backed(k, m) && Occupied(k, i) && SameExcept(m, m', TableBlocks(k.procs[i].value.dir))
    ensures forall j :: Occupied(k, j) && j != i ==> BackedProc(k.procs[j].value, m')
  {
    hide BackedProc, LedgerMapped, ProcsOk, RingOk;
    forall j: nat | Occupied(k, j) && j != i ensures BackedProc(k.procs[j].value, m') {
      DirsApart(k, i, j);
      BackedElsewhere(k.procs[j].value, m, m', TableBlocks(k.procs[i].value.dir));
    }
  }

  lemma DirsApart(k: State, i: nat, j: nat)
    requires Accounted(k) && Occupied(k, i) && Occupied(k, j) && i != j
    ensures TableBlocks(k.procs[i].value.dir) !! Trusted(k.procs[j].value)
  {
    assert OwnedBy(k, i) !! OwnedBy(k, j);
    assert TableBlocks(k.procs[i].value.dir) <= OwnedBy(k, i);
    assert Trusted(k.procs[j].value) <= OwnedBy(k, j);
  }

  /** A process's own page tables are not its struct elf_file. */
  lemma TablesNotElf(k: State, m: Mem, m': Mem, i: nat)
    requires Inv(k) && Backed(k, m) && Occupied(k, i) && SameExcept(m, m', TableBlocks(k.procs[i].value.dir))
    ensures ElfWord(m', k.procs[i].value.elf, k.procs[i].value.memory)
  {
    hide LedgerMapped, Accounted, RingOk, LedgerOk, PartsLive, DistinctDir, ElfWord, Installed, SameExcept;
    var p := k.procs[i].value;
    assert ProcOk(k.runs, p) && p.elf !in DirBlocks(p.dir);
    ElfWordKept(m, m', p.elf, p.memory, TableBlocks(p.dir));
  }

  /** Process i remapped itself in memory: the state with its new page map is backed. */
  lemma BackedAfterMap(k: State, k': State, m: Mem, m': Mem, i: nat)
    requires Inv(k) && Backed(k, m) && Occupied(k, i) && Occupied(k', i) && SameElsewhere(k, k', i)
    requires SameExcept(m, m', TableBlocks(k.procs[i].value.dir))
    requires var (p, p') := (k.procs[i].value, k'.procs[i].value);
      p' == p.(ledger := p'.ledger, pages := p'.pages) && Installed(m', p'.dir) && p'.pages == Flat(m', p'.dir)
    ensures Backed(k', m')
  {
    hide Inv, Flat, Installed, ElfWord, SameExcept, TableBlocks;
    TablesNotElf(k, m, m', i);
    BackedMap(k, m, m', i);
    forall j | Occupied(k', j) && j != i ensures BackedProc(k'.procs[j].value, m') {
      assert Occupied(k, j);
    }
  }

  lemma BackedFewer(k: State, i: nat, m: Mem)
    requires Backed(k, m) && Occupied(k, i) && i in k.ring && k.current.Some?
    ensures Backed(Terminate(k, i), m)
  {
    hide BackedProc;
    var k' := Terminate(k, i);
    forall j | Occupied(k', j) ensures BackedProc(k'.procs[j].value, m) {
      assert Occupied(k, j);
    }
  }

  /** A run that is process i's, and none of those the kernel relies on for it, holds no
      block relied on for any process. */
  lemma OwnRunNotTrusted(k: State, i: nat, b: nat, j: nat)
    requires Inv(k) && Occupied(k, i) && Occupied(k, j)
    requires b in OwnedBy(k, i) && b !in Trusted(k.procs[i].value)
    ensures b in k.runs && RunBlocks(b, k.runs[b]) !! Trusted(k.procs[j].value)
  {
    hide ProcOk, LedgerMapped, RingOk, DirBlocks, Partition, Core, LedgerBlocks;
    var q := k.procs[j].value;
    TrustedLive(k, j);
    TrustedOwned(k, j);
    assert b !in Trusted(q);
    forall c | c in Trusted(q) ensures c !in RunBlocks(b, k.runs[b]) {
      StartOnce(k.runs, HEAP_BLOCKS, b, c);
    }
  }

  lemma TrustedOwned(k: State, j: nat)
    requires Occupied(k, j)
    ensures Trusted(k.procs[j].value) <= OwnedBy(k, j)
  {
    hide DirBlocks;
    TrustedParts(k.procs[j].value);
  }

  /** Writing into such a run changes nothing the kernel relies on. */
  lemma BackedInRun(k: State, m: Mem, m': Mem, i: nat, b: nat)
    requires Inv(k) && Backed(k, m) && Occupied(k, i) && b in OwnedBy(k, i) && b !in Trusted(k.procs[i].value)
    requires b in k.runs && SameExcept(m, m', RunBlocks(b, k.runs[b]))
    ensures Backed(k, m')
  {
    hide BackedProc, Inv, OwnedBy, SameExcept, Trusted;
    forall j | Occupied(k, j) ensures BackedProc(k.procs[j].value, m') {
      OwnRunNotTrusted(k, i, b, j);
      BackedElsewhere(k.procs[j].value, m, m', RunBlocks(b, k.runs[b]));
    }
  }

  // --- Runs handed out but not yet entered in the state ----------------------------------------

  /** extra are fresh runs on top of those of k, and m still backs every process of k. */
  ghost predicate Transit(k: State, r: Runs, extra: Runs, m: Mem) {
    r == k.runs + extra && Extends(k.runs, extra, HEAP_BLOCKS) && Backed(k, m)
  }

  lemma TransitGrows(k: State, r: Runs, extra: Runs, m: Mem, m': Mem, b: nat, n: nat)
    requires Inv(k) && Transit(k, r, extra, m) && FitsAt(r, b, n) && SameExcept(m, m', RunBlocks(b, n))
    ensures b !in extra && Transit(k, r[b := n], extra[b := n], m')
  {
    hide Backed, Inv, SameExcept;
    PartitionAdd(r, HEAP_BLOCKS, b, n);
    FreeInFewer(k.runs, r, b, n);
    assert k.runs + extra[b := n] == r[b := n];
    BackedFresh(k, m, m', b, n);
  }

  lemma FreeInFewer(r: Runs, r': Runs, b: nat, n: nat)
    requires FitsAt(r', b, n) && forall a :: a in r ==> a in r' && r'[a] == r[a]
    ensures FitsAt(r, b, n)
  {
    forall i | b <= i < b + n ensures !InSomeRun(r, i) {
      if InSomeRun(r, i) {
        var a: nat :| Covers(r, a, i);
        assert Covers(r', a, i);
        assert InSomeRun(r', i);
      }
    }
  }

  /** The same for the 1026 blocks of a new set of page tables. */
  lemma TransitPaging(k: State, r: Runs, extra: Runs, m: Mem, m': Mem, d: Dir)
    requires Inv(k) && Transit(k, r, extra, m) && SameExcept(m, m', DirBlocks(d))
    requires DirBlocks(d) !! r.Keys && Partition(r + Singles(DirBlocks(d)), HEAP_BLOCKS)
    ensures Transit(k, r + Singles(DirBlocks(d)), extra + Singles(DirBlocks(d)), m')
  {
    hide BackedProc, LedgerMapped, RingOk, DirBlocks, Partition, SameExcept, Trusted;
    assert k.runs + (extra + Singles(DirBlocks(d))) == r + Singles(DirBlocks(d));
    forall i | Occupied(k, i) ensures BackedProc(k.procs[i].value, m') {
      TrustedLive(k, i);
      BackedElsewhere(k.procs[i].value, m, m', DirBlocks(d));
    }
  }

  lemma TrustedLive(k: State, i: nat)
    requires Inv(k) && Occupied(k, i)
    ensures Trusted(k.procs[i].value) <= k.runs.Keys
  {
    hide DirBlocks, ProcsOk, RingOk;
    assert OwnedBy(k, i) == Owned(k.procs[i].value);
    TrustedParts(k.procs[i].value);
  }

  /** Writing into the first blocks of extra runs, such as a new process's page tables. */
  lemma TransitMap(k: State, r: Runs, extra: Runs, m: Mem, m': Mem, s: set<nat>)
    requires Inv(k) && Transit(k, r, extra, m) && SameExcept(m, m', s) && s <= extra.Keys
    ensures Transit(k, r, extra, m')
  {
    hide BackedProc, LedgerMapped, RingOk, Partition, SameExcept, Trusted;
    forall i | Occupied(k, i) ensures BackedProc(k.procs[i].value, m') {
      TrustedLive(k, i);
      BackedElsewhere(k.procs[i].value, m, m', s);
    }
  }
}
