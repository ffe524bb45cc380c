/** src/memory/heap/kheap.c and src/memory/paging/paging.c over one physical memory:
    page tables are built in heap blocks and found again by following table words. */
module Paging {
  import opened Machine
  import opened HeapRuns
  import opened Heap
  import opened Freeing
  import opened PageTables

  class Memory {
    const heap: Heap
    const ram: array<Frame>

    constructor (heap: Heap, ram: array<Frame>)
      ensures this.heap == heap && this.ram == ram
    {
      this.heap := heap;
      this.ram := ram;
    }

    ghost predicate Valid()
      reads this, heap, heap.entries, ram
    {
      Sized() && heap.Valid()
    }

    /** The heap's table and the memory are those of the machine, whatever the tags say. */
    ghost predicate Sized() {
      heap.saddr == HEAP_ADDRESS && heap.entries.Length == HEAP_BLOCKS && ram.Length == PAGES
    }

    ghost function Ram(): Mem
      requires ram.Length == PAGES
      reads ram
    {
      ram[..]
    }

    function Load(a: Word): Word
      requires ram.Length == PAGES
      reads ram
    {
      ram[a / PAGE_SIZE][a % PAGE_SIZE]
    }

    method Store(a: Word, val: Word)
      requires ram.Length == PAGES
      modifies ram
      ensures Ram() == Stored(old(Ram()), a, val)
    {
      ram[a / PAGE_SIZE] := ram[a / PAGE_SIZE][a % PAGE_SIZE := val];
    }

    /** table[k] = val, where table is the address of heap block t. */
    method StoreWord(table: Word, k: nat, val: Word, ghost t: nat)
      requires ram.Length == PAGES && t < HEAP_BLOCKS && table == Addr(t) && k < ENTRIES
      modifies ram
      ensures Ram() == old(Ram())[BlockFrame(t) := old(Ram())[BlockFrame(t)][4 * k := val]]
      ensures forall j :: 0 <= j < ENTRIES ==>
        WordAt(Ram()[BlockFrame(t)], j) == if j == k then val else WordAt(old(Ram())[BlockFrame(t)], j)
      ensures SameExcept(old(Ram()), Ram(), {t})
    {
      Store(table + 4 * k, val);
    }

    /** memset(ptr, 0, size) over the n frames from frame f0 on. */
    method Clear(ptr: Word, size: nat, ghost f0: nat, ghost n: nat)
      requires ram.Length == PAGES && ptr == f0 * PAGE_SIZE && size <= n * PAGE_SIZE && f0 + n <= PAGES
      modifies ram
      ensures forall f :: 0 <= f < PAGES && !(f0 <= f < f0 + n) ==> ram[f] == old(ram[f])
      ensures forall a: Word :: ptr <= a < ptr + size ==> Cell(Ram(), a) == 0
    {
      for i := 0 to size
        invariant forall f :: 0 <= f < PAGES && !(f0 <= f < f0 + n) ==> ram[f] == old(ram[f])
        invariant forall a: Word :: ptr <= a < ptr + i ==> Cell(Ram(), a) == 0
      {
        ghost var before := Ram();
        Store(ptr + i, 0);
        forall a: Word | ptr <= a <= ptr + i ensures Cell(Ram(), a) == 0 { CellStored(before, ptr + i, 0, a); }
      }
    }

    /** kzalloc: a first-fit run whose first size bytes are cleared, or 0. */
    method Kzalloc(size: Word) returns (ptr: Word)
      requires Valid()
      modifies heap`runs, heap.entries, ram
      ensures Valid()
      ensures var fit := FirstFit(old(heap.runs), HEAP_BLOCKS, Blocks(size));
        if fit == -1 then ptr == 0 && heap.runs == old(heap.runs) && Ram() == old(Ram())
        else
          && ptr == Addr(fit) && heap.runs == old(heap.runs)[fit := Blocks(size)]
          && SameExcept(old(Ram()), Ram(), RunBlocks(fit, Blocks(size)))
          && (forall a: Word :: ptr <= a < ptr + size ==> Cell(Ram(), a) == 0)
    {
      ghost var fit := FirstFit(heap.runs, HEAP_BLOCKS, Blocks(size));
      ptr := heap.Malloc(size);
      if ptr != 0 {
        BlocksIsCeiling(size);
        Clear(ptr, size, BlockFrame(fit), Blocks(size));
      }
    }

    /** kfree of an address in block b, whatever the tags: they are cleared from b on. If b
        starts a run, that run is gone; if it belongs to none, nothing changes. */
    method Kfree(ptr: Word, ghost b: nat)
      requires Sized() && BlockOf(HEAP_ADDRESS, ptr) == b
      modifies heap`runs, heap.entries
      ensures heap.entries[..] == Cleared(old(heap.entries[..]), b)
      ensures old(Valid()) && (b in old(heap.runs) || !InSomeRun(old(heap.runs), b)) ==>
        Valid() && heap.runs == old(heap.runs) - {b}
      ensures !old(Valid()) ==> heap.runs == old(heap.runs)
    {
      StartsCovered(b);
      heap.Free(ptr);
    }

    lemma StartsCovered(b: nat)
      ensures heap.Valid() && b in heap.runs ==> InSomeRun(heap.runs, b)
      ensures heap.runs - {b} == if b in heap.runs then heap.runs - {b} else heap.runs
    {
      if heap.Valid() && b in heap.runs { assert Covers(heap.runs, b, b); }
    }

    lemma BlockOfRun(b: nat)
      requires Valid() && b in heap.runs
      ensures b < HEAP_BLOCKS && BlockOf(HEAP_ADDRESS, Addr(b)) == b
    {
    }

    /** The block of a run's address. */
    lemma BlockOfAddr(b: nat)
      requires b < HEAP_BLOCKS
      ensures BlockOf(HEAP_ADDRESS, Addr(b)) == b
    {
    }

    /** The address of the table that directory entry i points at. */
    function TableAddress(directory: Word, i: nat): Word
      requires ram.Length == PAGES && directory + 4 * i < WORD
      reads ram
    {
      FrameOf(Load(directory + 4 * i)) * PAGE_SIZE
    }

    lemma TableAddressIs(d: Dir, i: nat)
      requires ram.Length == PAGES && Installed(Ram(), d) && i < ENTRIES
      ensures TableAddress(Addr(d.dir), i) == Addr(d.tables[i])
    {
    }

    /** paging_get: on a misaligned address paging_get_indexes leaves both indexes 0. */
    function Get(directory: Word, virt: Word): Word
      requires ram.Length == PAGES && directory + PAGE_SIZE <= WORD
      reads ram
    {
      var (di, ti) := if virt % PAGE_SIZE != 0 then (0, 0) else Indexes(virt);
      Load(TableAddress(directory, di) + 4 * ti)
    }

    /** paging_get reads the flat map. */
    lemma GetIsFlat(d: Dir, virt: Word)
      requires ram.Length == PAGES && Installed(Ram(), d)
      ensures Get(Addr(d.dir), virt) == Flat(Ram(), d)[if virt % PAGE_SIZE == 0 then virt / PAGE_SIZE else 0]
    {
      var v := if virt % PAGE_SIZE == 0 then virt / PAGE_SIZE else 0;
      TableAddressIs(d, v / ENTRIES);
    }

    function GetPhysicalAddress(directory: Word, virt: Word): Word
      requires ram.Length == PAGES && directory + PAGE_SIZE <= WORD
      reads ram
    {
      var lower := AlignToLowerPage(virt);
      FrameOf(Get(directory, lower)) * PAGE_SIZE + (virt - lower)
    }

    lemma GetPhysicalAddressTranslates(d: Dir, virt: Word)
      requires ram.Length == PAGES && Installed(Ram(), d)
      ensures GetPhysicalAddress(Addr(d.dir), virt) == Translate(Flat(Ram(), d), virt)
    {
      hide Get, Flat, Installed, AlignToLowerPage, DirBlocks;
      LowerPage(virt);
      GetIsFlat(d, AlignToLowerPage(virt));
    }

    lemma LowerPage(virt: Word)
      ensures var lower := AlignToLowerPage(virt);
        lower % PAGE_SIZE == 0 && lower / PAGE_SIZE == virt / PAGE_SIZE && virt - lower == virt % PAGE_SIZE
    {
    }

    /** paging_set: one aligned page of the flat map changes, nothing else in memory
        does except words of d's own tables. */
    method Set(directory: Word, virt: Word, val: Word, ghost d: Dir) returns (res: int)
      requires ram.Length == PAGES && Installed(Ram(), d) && directory == Addr(d.dir)
      modifies ram
      ensures virt % PAGE_SIZE != 0 ==> res == -EINVARG && Ram() == old(Ram())
      ensures virt % PAGE_SIZE == 0 ==> res == 0 && Flat(Ram(), d) == Flat(old(Ram()), d)[virt / PAGE_SIZE := val]
      ensures Installed(Ram(), d) && SameExcept(old(Ram()), Ram(), TableBlocks(d))
    {
      if virt % PAGE_SIZE != 0 {
        return -EINVARG;
      }
      var (di, ti) := Indexes(virt);
      TableAddressIs(d, di);
      var table := TableAddress(directory, di);
      SetEntryIsFlatUpdate(Ram(), d, virt / PAGE_SIZE, val);
      StoreWord(table, ti, val, d.tables[di]);
      assert Ram() == SetEntry(old(Ram()), d, virt / PAGE_SIZE, val);
      res := 0;
    }

    /** paging_map */
    method Map(chunk: Word, virt: Word, phys: Word, flags: Word, ghost d: Dir) returns (res: int)
      requires ram.Length == PAGES && Installed(Ram(), d) && chunk == Addr(d.chunk)
      modifies ram
      ensures virt % PAGE_SIZE != 0 || phys % PAGE_SIZE != 0 ==> res == -EINVARG && Ram() == old(Ram())
      ensures virt % PAGE_SIZE == 0 && phys % PAGE_SIZE == 0 ==>
        res == 0 && Or(phys, flags) < WORD && Flat(Ram(), d) == Flat(old(Ram()), d)[virt / PAGE_SIZE := Or(phys, flags)]
      ensures Installed(Ram(), d) && SameExcept(old(Ram()), Ram(), TableBlocks(d))
    {
      if virt % PAGE_SIZE != 0 || phys % PAGE_SIZE != 0 {
        return -EINVARG;
      }
      OrWord(phys, flags);
      res := Set(Load(chunk), virt, Or(phys, flags), d);
    }

    /** paging_map_range: all-or-nothing, because a range that starts aligned stays so. */
    method MapRange(chunk: Word, virt: Word, phys: Word, count: int, flags: Word, ghost d: Dir) returns (res: int)
      requires ram.Length == PAGES && Installed(Ram(), d) && chunk == Addr(d.chunk)
      modifies ram
      ensures count > 0 && (virt % PAGE_SIZE != 0 || phys % PAGE_SIZE != 0) ==> res == -EINVARG && Ram() == old(Ram())
      ensures count <= 0 || (virt % PAGE_SIZE == 0 && phys % PAGE_SIZE == 0) ==>
        res == 0 && Flat(Ram(), d) == MapPages(Flat(old(Ram()), d), virt / PAGE_SIZE, phys / PAGE_SIZE, count, flags)
      ensures Installed(Ram(), d) && SameExcept(old(Ram()), Ram(), TableBlocks(d))
    {
      res := 0;
      var v: Word, p: Word := virt, phys;
      ghost var goal := MapPages(Flat(Ram(), d), virt / PAGE_SIZE, phys / PAGE_SIZE, count, flags);
      var i := 0;
      while i < count
        invariant 0 <= i && (count > 0 ==> i <= count) && (i > 0 ==> v % PAGE_SIZE == 0 && p % PAGE_SIZE == 0)
        invariant i == 0 ==> v == virt && p == phys && Ram() == old(Ram())
        invariant res == 0 && (i > 0 ==> virt % PAGE_SIZE == 0 && phys % PAGE_SIZE == 0)
        invariant Installed(Ram(), d) && SameExcept(old(Ram()), Ram(), TableBlocks(d))
        invariant MapPages(Flat(Ram(), d), v / PAGE_SIZE, p / PAGE_SIZE, count - i, flags) == goal
      {
        ghost var before := Ram();
        res := Map(chunk, v, p, flags, d);
        if res < 0 {
          break;
        }
        NextPage(v);
        NextPage(p);
        v, p := Wrap(v + PAGE_SIZE), Wrap(p + PAGE_SIZE);
        i := i + 1;
      }
    }

    lemma NextPage(a: Word)
      requires a % PAGE_SIZE == 0
      ensures Wrap(a + PAGE_SIZE) % PAGE_SIZE == 0
      ensures Wrap(a + PAGE_SIZE) / PAGE_SIZE == (a / PAGE_SIZE + 1) % PAGES
    {
    }

    /** paging_map_to: the flat map of d becomes MapTo of the old one. */
    method MapTo(chunk: Word, virt: Word, phys: Word, physEnd: Word, flags: Word, ghost d: Dir) returns (res: int)
      requires ram.Length == PAGES && Installed(Ram(), d) && chunk == Addr(d.chunk)
      modifies ram
      ensures (Flat(Ram(), d), res) == PageTables.MapTo(Flat(old(Ram()), d), virt, phys, physEnd, flags)
      ensures res != 0 ==> Ram() == old(Ram())
      ensures Installed(Ram(), d) && SameExcept(old(Ram()), Ram(), TableBlocks(d))
    {
      if virt % PAGE_SIZE != 0 {
        return -EINVARG;
      }
      if phys % PAGE_SIZE != 0 {
        return -EINVARG;
      }
      if physEnd % PAGE_SIZE != 0 {
        return -EINVARG;
      }
      if physEnd < phys {
        return -EINVARG;
      }
      var totalBytes := physEnd - phys;
      res := MapRange(chunk, virt, phys, totalBytes / PAGE_SIZE, flags, d);
    }

    lemma HeapPartition()
      requires Valid()
      ensures Partition(heap.runs, HEAP_BLOCKS)
    {
    }

    /** kzalloc of at most one block while some block is free. */
    method KzallocBlock(size: Word) returns (ptr: Word, ghost b: nat)
      requires Valid() && 0 < size <= PAGE_SIZE && FreeBlocks(heap.runs, HEAP_BLOCKS) != {}
      modifies heap`runs, heap.entries, ram
      ensures Valid() && ptr == Addr(b) && b < HEAP_BLOCKS
      ensures b !in old(heap.runs) && heap.runs == old(heap.runs)[b := 1]
      ensures |FreeBlocks(heap.runs, HEAP_BLOCKS)| == |FreeBlocks(old(heap.runs), HEAP_BLOCKS)| - 1
      ensures SameExcept(old(Ram()), Ram(), {b})
    {
      hide Heap.Valid, FirstFit, FreeBlocks, SameExcept, Encoded;
      HeapPartition();
      TakeOne(heap.runs, HEAP_BLOCKS);
      assert RunBlocks(FirstFit(heap.runs, HEAP_BLOCKS, 1), Blocks(size)) == {FirstFit(heap.runs, HEAP_BLOCKS, 1)};
      b := FirstFit(heap.runs, HEAP_BLOCKS, 1);
      ptr := Kzalloc(size);
    }

    /** The inner loop of paging_new_4gb. */
    method FillTable(entry: Word, offset: Word, flags: Word, ghost t: nat, ghost j: nat)
      requires ram.Length == PAGES && t < HEAP_BLOCKS && entry == Addr(t)
      requires j < ENTRIES && offset == j * ENTRIES * PAGE_SIZE && flags < PAGE_SIZE
      modifies ram
      ensures TableFilled(Ram(), t, j, flags) && SameExcept(old(Ram()), Ram(), {t})
    {
      for b := 0 to ENTRIES
        invariant SameExcept(old(Ram()), Ram(), {t})
        invariant forall k :: 0 <= k < b ==> WordAt(Ram()[BlockFrame(t)], k) == (j * ENTRIES + k) * PAGE_SIZE + flags
      {
        OrFlags(j * ENTRIES + b, 0, flags);
        StoreWord(entry, b, Or(offset + b * PAGE_SIZE, flags), t);
      }
    }

    /** paging_new_4gb: 1026 fresh blocks holding a directory that maps every page to
        itself with the given flags. The source checks none of its allocations. */
    method New4gb(flags: Word) returns (chunk: Word, ghost d: Dir)
      requires Valid() && flags < 256 && |FreeBlocks(heap.runs, HEAP_BLOCKS)| >= ENTRIES + 2
      modifies heap`runs, heap.entries, ram
      ensures Valid() && chunk == Addr(d.chunk)
      ensures Installed(Ram(), d) && d.flags == Or(flags, IS_WRITEABLE) && Flat(Ram(), d) == Identity(flags)
      ensures DirBlocks(d) !! old(heap.runs).Keys && heap.runs == old(heap.runs) + Singles(DirBlocks(d))
      ensures SameExcept(old(Ram()), Ram(), DirBlocks(d))
    {
      hide Building, Encoded, SameExcept;
      ghost var r, m := heap.runs, Ram();
      ghost var dir: nat, ts: seq<nat>, t: nat := 0, [], 0;
      var directory;
      directory, dir := NewDirectory(flags);
      var offset := 0;
      for i := 0 to ENTRIES
        invariant Valid() && |ts| == i && Building(m, Ram(), r, heap.runs, dir, ts, flags)
        invariant |FreeBlocks(heap.runs, HEAP_BLOCKS)| >= ENTRIES + 1 - i
        invariant offset == Wrap(i * ENTRIES * PAGE_SIZE)
      {
        t := NewTable(directory, i, offset, flags, m, r, dir, ts);
        offset := Wrap(offset + PAGE_SIZE * ENTRIES);
        ts := ts + [t];
      }
      chunk, d := NewChunk(directory, flags, m, r, dir, ts);
    }

    /** The first allocation of paging_new_4gb. */
    method NewDirectory(flags: Word) returns (directory: Word, ghost dir: nat)
      requires Valid() && flags < 256 && FreeBlocks(heap.runs, HEAP_BLOCKS) != {}
      modifies heap`runs, heap.entries, ram
      ensures Valid() && directory == Addr(dir)
      ensures Building(old(Ram()), Ram(), old(heap.runs), heap.runs, dir, [], flags)
      ensures |FreeBlocks(heap.runs, HEAP_BLOCKS)| == |FreeBlocks(old(heap.runs), HEAP_BLOCKS)| - 1
    {
      directory, dir := KzallocBlock(4 * ENTRIES);
      assert Built(dir, []) == {dir};
    }

    /** The last allocation of paging_new_4gb: the chunk record. */
    method NewChunk(directory: Word, flags: Word, ghost m: Mem, ghost r: Runs, ghost dir: nat, ghost ts: seq<nat>)
      returns (chunk: Word, ghost d: Dir)
      requires Valid() && directory == Addr(dir) && |ts| == ENTRIES
      requires Building(m, Ram(), r, heap.runs, dir, ts, flags) && FreeBlocks(heap.runs, HEAP_BLOCKS) != {}
      modifies heap`runs, heap.entries, ram
      ensures Valid() && chunk == Addr(d.chunk)
      ensures Installed(Ram(), d) && d.flags == Or(flags, IS_WRITEABLE) && Flat(Ram(), d) == Identity(flags)
      ensures DirBlocks(d) !! r.Keys && heap.runs == r + Singles(DirBlocks(d))
      ensures SameExcept(m, Ram(), DirBlocks(d))
    {
      hide Encoded;
      ghost var m0, r0 := Ram(), heap.runs;
      ghost var c: nat;
      chunk, c := KzallocBlock(4);
      StoreWord(chunk, 0, directory, c);
      d := Dir(c, dir, ts, Or(flags, IS_WRITEABLE));
      BuildDone(m, m0, Ram(), r, r0, d, flags);
    }

    /** One round of the outer loop of paging_new_4gb. */
    method NewTable(directory: Word, i: nat, offset: Word, flags: Word,
                    ghost m: Mem, ghost r: Runs, ghost dir: nat, ghost ts: seq<nat>)
      returns (ghost t: nat)
      requires Valid() && directory == Addr(dir) && |ts| == i < ENTRIES && offset == i * ENTRIES * PAGE_SIZE
      requires Building(m, Ram(), r, heap.runs, dir, ts, flags) && FreeBlocks(heap.runs, HEAP_BLOCKS) != {}
      modifies heap`runs, heap.entries, ram
      ensures Valid() && Building(m, Ram(), r, heap.runs, dir, ts + [t], flags)
      ensures |FreeBlocks(heap.runs, HEAP_BLOCKS)| == |FreeBlocks(old(heap.runs), HEAP_BLOCKS)| - 1
    {
      hide Encoded;
      ghost var m0, r0 := Ram(), heap.runs;
      assert dir in r0;
      var entry;
      entry, t := KzallocBlock(4 * ENTRIES);
      FillTable(entry, offset, flags, t, i);
      DirectoryWord(t, flags);
      ghost var m1 := Ram();
      assert SameExcept(m0, m1, {t});
      StoreWord(directory, i, Or(Or(entry, flags), IS_WRITEABLE), dir);
      assert Ram()[BlockFrame(t)] == m1[BlockFrame(t)] && m1[BlockFrame(dir)] == m0[BlockFrame(dir)];
      BuildStep(m, m0, Ram(), r, r0, dir, ts, flags, t);
    }

    /** paging_free_4gb: the directory and chunk record are freed with the 1024 tables
        their words lead to, whatever the heap's tags. */
    method Free4gb(chunk: Word, ghost d: Dir)
      requires Sized() && Installed(Ram(), d) && chunk == Addr(d.chunk)
      modifies heap`runs, heap.entries
      ensures heap.entries[..] == FreeAll(old(heap.entries[..]), PagingBlocks(d))
      ensures old(Valid()) && DirBlocks(d) <= old(heap.runs).Keys ==>
        Valid() && heap.runs == old(heap.runs) - DirBlocks(d)
    {
      hide Heap.Valid, Installed, FreeAll, Cleared, DirBlocks, PagingBlocks;
      ghost var s, r, was := heap.entries[..], heap.runs, Valid();
      ValidTags();
      ChunkKnown(d);
      var directory := Load(chunk);
      FreeTables(directory, d);
      LastTwo(s, d);
      BlockOfAddr(d.dir);
      Kfree(directory, d.dir);
      BlockOfAddr(d.chunk);
      Kfree(chunk, d.chunk);
      if was && DirBlocks(d) <= r.Keys { SettleWithout(s, r, d); }
    }

    lemma ValidTags()
      ensures Valid() ==> Encoded(heap.entries[..], heap.runs) && heap.entries.Length == HEAP_BLOCKS
    {
    }

    lemma ChunkKnown(d: Dir)
      requires ram.Length == PAGES && Installed(Ram(), d)
      ensures d.chunk < HEAP_BLOCKS && d.dir < HEAP_BLOCKS && |d.tables| == ENTRIES
      ensures Load(Addr(d.chunk)) == Addr(d.dir)
    {
    }

    /** The loop of paging_free_4gb. */
    method FreeTables(directory: Word, ghost d: Dir)
      requires Sized() && Installed(Ram(), d) && directory == Addr(d.dir) && |d.tables| == ENTRIES
      modifies heap`runs, heap.entries
      ensures heap.entries[..] == FreeAll(old(heap.entries[..]), d.tables)
    {
      hide Heap.Valid, Installed, FreeAll, Cleared;
      ghost var s := heap.entries[..];
      NoneFreed(s);
      for i := 0 to ENTRIES
        invariant Sized() && heap.entries[..] == FreeAll(s, d.tables[..i])
      {
        TableAddressIs(d, i);
        TableBlock(d, i);
        FreeAllMore(s, d.tables[..i], d.tables[i]);
        Kfree(TableAddress(directory, i), d.tables[i]);
      }
      assert d.tables[..ENTRIES] == d.tables;
    }

    ghost method SettleWithout(s: seq<Tag>, r: Runs, d: Dir)
      requires Sized() && Encoded(s, r) && |s| == HEAP_BLOCKS && DirBlocks(d) <= r.Keys
      requires heap.entries[..] == FreeAll(s, PagingBlocks(d))
      modifies heap`runs
      ensures Valid() && heap.runs == r - DirBlocks(d)
    {
      hide Encoded;
      PagingBlocksAre(d);
      FreesExactly(s, r, DirBlocks(d), PagingBlocks(d));
      heap.Settle(r - DirBlocks(d));
    }

    lemma TableBlock(d: Dir, i: nat)
      requires ram.Length == PAGES && Installed(Ram(), d) && i < ENTRIES
      ensures BlockOf(HEAP_ADDRESS, Addr(d.tables[i])) == d.tables[i]
      ensures d.tables[..i + 1] == d.tables[..i] + [d.tables[i]]
    {
      BlockOfAddr(d.tables[i]);
    }

    lemma LastTwo(s: seq<Tag>, d: Dir)
      requires |d.tables| == ENTRIES
      ensures FreeAll(s, PagingBlocks(d)) == Cleared(Cleared(FreeAll(s, d.tables), d.dir), d.chunk)
    {
      hide FreeAll, Cleared;
      assert PagingBlocks(d) == (d.tables + [d.dir]) + [d.chunk];
      FreeAllMore(s, d.tables + [d.dir], d.chunk);
      FreeAllMore(s, d.tables, d.dir);
    }

    /** A new directory given back at once leaves every tag of the heap as it was. */
    method NewThenFree(flags: Word)
      requires Valid() && flags < 256 && |FreeBlocks(heap.runs, HEAP_BLOCKS)| >= ENTRIES + 2
      modifies heap`runs, heap.entries, ram
      ensures Valid() && heap.runs == old(heap.runs) && heap.entries[..] == old(heap.entries[..])
    {
      ghost var r := heap.runs;
      var chunk;
      ghost var d;
      chunk, d := New4gb(flags);
      Free4gb(chunk, d);
      assert r + Singles(DirBlocks(d)) - DirBlocks(d) == r;
      EncodingIsAFunction(old(heap.entries[..]), heap.entries[..], heap.runs);
    }
  }

  /** The blocks paging_free_4gb frees, in its order. */
  ghost function PagingBlocks(d: Dir): seq<nat> {
    d.tables + [d.dir, d.chunk]
  }

  lemma PagingBlocksAre(d: Dir)
    ensures forall b: nat :: b in PagingBlocks(d) <==> b in DirBlocks(d)
  {
  }

  /** paging_get_indexes on an aligned address: directory and table index. */
  function Indexes(virt: Word): (r: (nat, nat))
    ensures r.0 < ENTRIES && r.1 < ENTRIES && r.0 * ENTRIES + r.1 == virt / PAGE_SIZE
  {
    (virt / (ENTRIES * PAGE_SIZE), virt % (ENTRIES * PAGE_SIZE) / PAGE_SIZE)
  }
}
