/** src/memory/heap/heap.c: the block allocator, working in place on the tag table.
    Methods whose name ends in AsWritten keep a line of the source that departs from
    its evident intent; their unmarked twins are the repaired form. */
module Heap {
  import opened Machine
  import opened HeapRuns

  /** heap_align_value_to_upper, with the 32-bit wrap of its addition. */
  function AlignToUpper(val: Word): Word {
    if val % PAGE_SIZE == 0 then val else Wrap(val - val % PAGE_SIZE + PAGE_SIZE)
  }

  /** Blocks requested for a size in bytes. */
  function Blocks(size: Word): nat {
    AlignToUpper(size) / PAGE_SIZE
  }

  /** Blocks is the rounded-up quotient, except that the rounding wraps to zero in the
      last page of the word range. */
  lemma BlocksIsCeiling(size: Word)
    ensures size <= WORD - PAGE_SIZE ==> (Blocks(size) - 1) * PAGE_SIZE < size <= Blocks(size) * PAGE_SIZE
    ensures size > WORD - PAGE_SIZE ==> Blocks(size) == 0
  {
  }

  /** heap_address_to_block: (int)(address - saddr) / 4096, the difference a signed 32-bit
      number and the division toward zero. */
  function BlockOf(saddr: Word, address: Word): int {
    var distance := Wrap(address - saddr);
    if distance < WORD / 2 then distance / PAGE_SIZE else -((WORD - distance) / PAGE_SIZE)
  }

  /** Every byte of a block has that block, and in front of the heap blocks are counted toward
      zero. */
  lemma BlockOfByte(saddr: Word, b: nat, o: nat)
    requires o < 4096 && 4096 * b + o < WORD / 2
    ensures saddr + 4096 * b + o < WORD ==> BlockOf(saddr, saddr + 4096 * b + o) == b
    ensures saddr - (4096 * b + o) >= 0 ==> BlockOf(saddr, saddr - (4096 * b + o)) == 0 - b
  {
  }

  class Heap {
    const entries: array<Tag>
    const saddr: Word
    ghost var runs: Runs

    ghost predicate Valid()
      reads this, entries
    {
      && 0 < saddr && saddr % PAGE_SIZE == 0 && saddr + PAGE_SIZE * entries.Length <= WORD
      && PAGE_SIZE * entries.Length < WORD / 2
      && Encoded(entries[..], runs)
    }

    constructor (saddr: Word, entries: array<Tag>)
      ensures this.saddr == saddr && this.entries == entries && runs == map[]
    {
      this.saddr := saddr;
      this.entries := entries;
      runs := map[];
    }

    /** heap_create: rejects misaligned bounds or a table of the wrong length, otherwise
        clears the table, leaving no live run. */
    static method Create(ptr: Word, end: Word, table: array<Tag>) returns (res: int, heap: Heap?)
      modifies table
      ensures res == 0 <==> ptr % PAGE_SIZE == 0 && end % PAGE_SIZE == 0 && table.Length == Wrap(end - ptr) / PAGE_SIZE
      ensures res == 0 || (res == -EINVARG && heap == null && table[..] == old(table[..]))
      ensures res == 0 && 0 < ptr <= end && end - ptr < WORD / 2 ==>
        heap != null && fresh(heap) && heap.saddr == ptr && heap.entries == table && heap.runs == map[] && heap.Valid()
    {
      heap := null;
      if ptr % PAGE_SIZE != 0 || end % PAGE_SIZE != 0 {
        return -EINVARG, heap;
      }
      if table.Length != Wrap(end - ptr) / PAGE_SIZE {
        return -EINVARG, heap;
      }
      forall i | 0 <= i < table.Length {
        table[i] := FREE;
      }
      heap := new Heap(ptr, table);
      res := 0;
    }

    function BlockToAddress(block: nat): int
    {
      saddr + block * PAGE_SIZE
    }

    /** heap_address_to_block undoes the conversion of a block to its address. */
    function AddressToBlock(address: Word): (b: int)
      ensures forall block: nat :: address == BlockToAddress(block) && block * PAGE_SIZE < WORD / 2 ==> b == block
    {
      BlockOf(saddr, address)
    }

    /** heap_get_start_block with heap.c:83 and heap.c:102 repaired: first fit. */
    method GetStartBlock(n: nat) returns (start: int)
      ensures IsFirstFit(entries[..], n, start)
    {
      ghost var s := entries[..];
      var bc, bs := 0, -1;
      for i := 0 to entries.Length
        invariant bs == -1 ==> bc == 0 && (i > 0 ==> EntryType(s[i - 1]) != FREE)
        invariant bs != -1 ==> 0 < bc && bs == i - bc && 0 <= bs && FreeWindow(s, bs, bc)
        invariant bs > 0 ==> EntryType(s[bs - 1]) != FREE
        invariant n > 0 ==> bc < n
        invariant n > 0 ==> forall b :: FreeWindow(s, b, n) ==> i < b + n
      {
        if EntryType(entries[i]) != FREE {
          bc, bs := 0, -1;
          continue;
        }
        if bs == -1 {
          bs := i;
        }
        bc := bc + 1;
        if bc == n {
          return bs;
        }
      }
      return -ENOMEM;
    }

    /** heap_get_start_block with its two lines as written: a free block resets the run,
        and a trailing run is returned however short. A start it returns is never free,
        so it is a first fit only where it reports -ENOMEM and no fit exists. */
    method GetStartBlockAsWritten(n: nat) returns (start: int)
      ensures start >= 0 ==> start < entries.Length && EntryType(entries[start]) != FREE
      ensures n > 0 ==> (IsFirstFit(entries[..], n, start) <==> MixedWindows(entries[..], n))
      ensures n > 0 ==> (start == -ENOMEM <==> GivesUpAsWritten(entries[..], n))
    {
      ghost var s := entries[..];
      var bc, bs := 0, -1;
      for i := 0 to entries.Length
        invariant bs == -1 ==> bc == 0 && (i > 0 ==> EntryType(s[i - 1]) == FREE)
        invariant bs != -1 ==> 0 < bc && 0 <= bs == i - bc && TakenWindow(s, bs, bc)
        invariant n > 0 ==> bc < n
        invariant bs > 0 ==> EntryType(s[bs - 1]) == FREE
        invariant n > 0 ==> forall b :: TakenWindow(s, b, n) ==> i < b + n
      {
        if EntryType(entries[i]) == FREE {
          bc, bs := 0, -1;
          continue;
        }
        if bs == -1 {
          bs := i;
        }
        bc := bc + 1;
        if bc == n {
          assert TakenWindow(s, bs, n);
          return bs;
        }
      }
      if bs == -1 {
        return -ENOMEM;
      }
      return bs;
    }

    /** heap_mark_blocks_taken with heap.c:120 and heap.c:129 repaired. */
    method MarkBlocksTaken(start: nat, n: nat)
      requires Valid() && n > 0 && start + n <= entries.Length && FreeAt(runs, start, n)
      modifies this`runs, entries
      ensures Valid() && runs == old(runs)[start := n]
    {
      var end := start + n - 1;
      var entry := TAKEN | IS_FIRST;
      if n > 1 {
        entry := entry | HAS_NEXT;
      }
      for i := start to end + 1
        modifies entries
        invariant i <= end ==> entry == RunTag(i - start, n)
        invariant forall j :: start <= j < i ==> entries[j] == RunTag(j - start, n)
        invariant forall j :: 0 <= j < entries.Length && !(start <= j < i) ==> entries[j] == old(entries[j])
      {
        entries[i] := entry;
        entry := TAKEN;
        if i != end - 1 {
          entry := entry | HAS_NEXT;
        }
      }
      EncodeAdd(old(entries[..]), entries[..], runs, start, n);
      runs := runs[start := n];
    }

    /** heap_mark_blocks_taken as written: only a single block in the first two
        positions of the table gets the tags a later free can walk. */
    method MarkBlocksTakenAsWritten(start: nat, n: nat)
      requires n > 0 && start + n <= entries.Length
      modifies entries
      ensures (forall j :: start <= j < start + n ==> entries[j] == RunTag(j - start, n)) <==> n == 1 && start <= 1
    {
      var end := start + n - 1;
      var entry := TAKEN | IS_FIRST;
      if end > 1 {
        entry := entry | HAS_NEXT;
      }
      for i := start to end + 1
        invariant i == start ==> entry == TAKEN | IS_FIRST | (if end > 1 then HAS_NEXT else 0)
        invariant i > start ==> entries[start] == TAKEN | IS_FIRST | (if end > 1 then HAS_NEXT else 0)
        invariant start < i == end ==> entry == TAKEN | HAS_NEXT
        invariant start < end < i ==> entries[end] == TAKEN | HAS_NEXT
      {
        entries[i] := entry;
        entry := TAKEN;
        if i == end - 1 {
          entry := entry | HAS_NEXT;
        }
      }
    }

    /** heap_mark_blocks_free, from any block on. From the start of a live run it clears
        exactly that run; from a free block, or beyond the table, nothing. From inside a run
        it cuts the run short, and the tags encode no set of runs any more. */
    method MarkBlocksFree(start: nat)
      modifies this`runs, entries
      ensures entries[..] == Cleared(old(entries[..]), start)
      ensures old(Valid()) && start in old(runs) ==> Valid() && runs == old(runs) - {start}
      ensures old(Valid()) && !InSomeRun(old(runs), start) ==>
        Valid() && runs == old(runs) && entries[..] == old(entries[..])
      ensures !(old(Valid()) && start in old(runs)) ==> runs == old(runs)
    {
      ghost var s := entries[..];
      ClearFrom(start);
      if old(Valid()) && start in runs {
        assert Covers(runs, start, start);
        ClearStopOfRun(s, runs, start, start);
        EncodeRemove(s, entries[..], runs, start);
        runs := runs - {start};
      } else if old(Valid()) && start < |s| && !InSomeRun(runs, start) {
        FreeTag(s, runs, start);
        ClearedFree(s, start);
      }
    }

    /** The loop of heap_mark_blocks_free. */
    method ClearFrom(start: nat)
      modifies entries
      ensures entries[..] == Cleared(old(entries[..]), start)
    {
      ghost var s := entries[..];
      var i: int := start;
      while i < entries.Length
        invariant start <= i && (start < |s| ==> i <= ClearStop(s, start))
        invariant start < |s| ==> ClearStop(s, start) == if i < |s| then ClearStop(s, i) else |s|
        invariant forall j :: 0 <= j < entries.Length ==> entries[j] == if start <= j < i then FREE else s[j]
      {
        var entry := entries[i];
        entries[i] := FREE;
        if !HasNext(entry) {
          break;
        }
        i := i + 1;
      }
    }

    /** heap_malloc: complete first fit over ceil(size / 4096) blocks. */
    method Malloc(size: Word) returns (address: Word)
      requires Valid()
      modifies this`runs, entries
      ensures Valid()
      ensures var fit := FirstFit(old(runs), entries.Length, Blocks(size));
        if fit == -1 then address == 0 && runs == old(runs) && entries[..] == old(entries[..])
        else address == BlockToAddress(fit) && runs == old(runs)[fit := Blocks(size)]
    {
      address := 0;
      var start := GetStartBlock(Blocks(size));
      IsFirstFitMeansFirstFit(entries[..], runs, Blocks(size), start);
      if start < 0 {
        return;
      }
      FreeWindowIsFreeAt(entries[..], runs, start, Blocks(size));
      address := BlockToAddress(start);
      MarkBlocksTaken(start, Blocks(size));
    }

    /** heap_free of any address whose block is not in front of the table. */
    method Free(ptr: Word)
      requires AddressToBlock(ptr) >= 0
      modifies this`runs, entries
      ensures entries[..] == Cleared(old(entries[..]), AddressToBlock(ptr))
      ensures old(Valid()) && AddressToBlock(ptr) in old(runs) ==>
        Valid() && runs == old(runs) - {AddressToBlock(ptr)}
      ensures old(Valid()) && !InSomeRun(old(runs), AddressToBlock(ptr)) ==>
        Valid() && runs == old(runs) && entries[..] == old(entries[..])
      ensures !(old(Valid()) && AddressToBlock(ptr) in old(runs)) ==> runs == old(runs)
    {
      MarkBlocksFree(AddressToBlock(ptr));
    }

    /** The tags encode the runs r, whatever was known of them. */
    ghost method Settle(r: Runs)
      requires 0 < saddr && saddr % PAGE_SIZE == 0 && saddr + PAGE_SIZE * entries.Length <= WORD
      requires PAGE_SIZE * entries.Length < WORD / 2 && Encoded(entries[..], r)
      modifies this`runs
      ensures Valid() && runs == r
    {
      runs := r;
    }

    /** A successful malloc undone by free leaves every tag of the table as it was. */
    method MallocThenFree(size: Word) returns (address: Word)
      requires Valid()
      modifies this`runs, entries
      ensures Valid() && runs == old(runs) && entries[..] == old(entries[..])
    {
      ghost var r, fit := runs, FirstFit(runs, entries.Length, Blocks(size));
      address := Malloc(size);
      if address != 0 {
        PartitionAdd(r, entries.Length, fit, Blocks(size));
        Free(address);
        assert r[fit := Blocks(size)] - {fit} == r;
      }
      EncodingIsAFunction(old(entries[..]), entries[..], runs);
    }
  }

  ghost predicate TakenWindow(s: seq<Tag>, b: int, n: nat) {
    0 <= b && b + n <= |s| && forall i :: b <= i < b + n ==> EntryType(s[i]) != FREE
  }

  /** The search as written finds nothing: it looks for n taken blocks in a row, or for a
      taken block at the end of the table. */
  ghost predicate GivesUpAsWritten(s: seq<Tag>, n: nat) {
    && (|s| > 0 ==> EntryType(s[|s| - 1]) == FREE)
    && forall b :: !TakenWindow(s, b, n)
  }

  /** The last block is free, and no n consecutive blocks are all free or all taken. */
  ghost predicate MixedWindows(s: seq<Tag>, n: nat) {
    && (|s| > 0 ==> EntryType(s[|s| - 1]) == FREE)
    && forall b :: !FreeWindow(s, b, n) && !TakenWindow(s, b, n)
  }

  /** On the table heap_create leaves behind, every request that fits is refused as written:
      block 0 would do, and the search returns -ENOMEM. */
  lemma FreshHeapRefusesAsWritten(s: seq<Tag>, n: nat)
    requires 0 < n <= |s| && forall i :: 0 <= i < |s| ==> s[i] == FREE
    ensures GivesUpAsWritten(s, n) && IsFirstFit(s, n, 0)
  {
    assert FreeWindow(s, 0, n);
    forall b: int ensures !TakenWindow(s, b, n) {
      if 0 <= b && b + n <= |s| { assert EntryType(s[b]) == FREE; }
    }
  }
}
