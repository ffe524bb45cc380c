/** copy_string_from_task (src/task/task.c:139-174): the kernel borrows one page of the
    task's address space to copy a string out of it. */
module CopyString {
  import opened Machine
  import opened HeapRuns
  import opened Heap
  import opened PageTables
  import opened Paging

  /** The cell the processor reads at virtual address va under page map pages. */
  ghost function Seen(m: Mem, pages: seq<Word>, va: Word): Word
    requires |pages| == PAGES
  {
    m[FrameOf(pages[va / PAGE_SIZE])][va % PAGE_SIZE]
  }

  /** The i-th character of the string at virt, as the task sees it. */
  ghost function CharAt(m: Mem, pages: seq<Word>, virt: Word, i: nat): Word
    requires |pages| == PAGES
  {
    Seen(m, pages, Wrap(virt + i))
  }

  /** What the task sees at an address is what lies where its page map leads. */
  lemma SeenTranslates(m: Mem, pages: seq<Word>, virt: Word, i: nat)
    requires |pages| == PAGES
    ensures CharAt(m, pages, virt, i) == Cell(m, Translate(pages, Wrap(virt + i)))
  {
    var va := Wrap(virt + i);
    PageSplit(FrameOf(pages[va / PAGE_SIZE]), va % PAGE_SIZE);
  }

  /** s holds the characters seen at virt, up to the terminator or to count - 1 of them,
      and a terminator of its own. */
  ghost predicate Copied(s: seq<Word>, m: Mem, pages: seq<Word>, virt: Word, count: nat)
    requires |pages| == PAGES
  {
    && 0 < |s| <= count && s[|s| - 1] == 0
    && (forall i :: 0 <= i < |s| - 1 ==> s[i] == CharAt(m, pages, virt, i) && s[i] != 0)
    && (|s| == count || CharAt(m, pages, virt, |s| - 1) == 0)
  }

  /** The characters that are read, up to the terminator or to count - 1 of them, are seen
      neither through the temporary page nor in its frame or the task's page tables (s: the
      blocks about to be written). */
  ghost predicate ClearOf(m: Mem, pages: seq<Word>, virt: Word, count: nat, b: nat, s: set<nat>)
    requires |pages| == PAGES
  {
    forall i: nat :: i + 1 < count && NotEnded(m, pages, virt, i) ==> CharClear(pages, virt, i, b, s)
  }

  /** No terminator comes before character i. */
  ghost predicate NotEnded(m: Mem, pages: seq<Word>, virt: Word, i: nat)
    requires |pages| == PAGES
  {
    forall j :: 0 <= j < i ==> CharAt(m, pages, virt, j) != 0
  }

  ghost predicate ClearAt(pages: seq<Word>, va: Word, b: nat, s: set<nat>)
    requires |pages| == PAGES
  {
    va / PAGE_SIZE != BlockFrame(b) && FrameOf(pages[va / PAGE_SIZE]) - HEAP_FRAME !in s
  }

  ghost predicate CharClear(pages: seq<Word>, virt: Word, i: nat, b: nat, s: set<nat>)
    requires |pages| == PAGES
  {
    ClearAt(pages, Wrap(virt + i), b, s)
  }

  lemma SeenElsewhere(m: Mem, m': Mem, pages: seq<Word>, va: Word, b: nat, entry: Word, s: set<nat>)
    requires |pages| == PAGES && b < HEAP_BLOCKS && ClearAt(pages, va, b, s) && SameExcept(m, m', s)
    ensures Seen(m', pages[BlockFrame(b) := entry], va) == Seen(m, pages, va)
  {
  }

  /** The task's directory, seen from a kernel that has mapped block b to itself in it. */
  ghost predicate Borrowed(memory: Memory, d: Dir, b: nat, m: Mem, pages: seq<Word>)
    reads memory.ram
    requires |pages| == PAGES
  {
    && memory.ram.Length == PAGES && b < HEAP_BLOCKS && Installed(memory.Ram(), d) && b !in DirBlocks(d)
    && Flat(memory.Ram(), d) == pages[BlockFrame(b) := Addr(b) + USER_RW]
    && SameExcept(m, memory.Ram(), TableBlocks(d) + {b})
  }

  /** One character store into the borrowed page, through the task's directory. */
  method StoreChar(memory: Memory, directory: Word, tmp: Word, n: nat, c: Word, ghost d: Dir, ghost b: nat,
      ghost m: Mem, ghost pages: seq<Word>)
    requires |pages| == PAGES && Borrowed(memory, d, b, m, pages) && directory == Addr(d.dir) && tmp == Addr(b)
    requires n < PAGE_SIZE
    modifies memory.ram
    ensures Borrowed(memory, d, b, m, pages) && SameExcept(old(memory.Ram()), memory.Ram(), {b})
    ensures memory.Ram()[BlockFrame(b)] == old(memory.Ram())[BlockFrame(b)][n := c]
  {
    hide Installed, Flat, DirBlocks, TableBlocks, SameExcept, Borrowed, Translate;
    BorrowedRam(memory, d, b, m, pages);
    ghost var before := memory.Ram();
    memory.GetPhysicalAddressTranslates(d, tmp + n);
    BorrowedTranslates(pages, b, n);
    var phys := memory.GetPhysicalAddress(directory, tmp + n);
    memory.Store(phys, c);
    ghost var after := memory.Ram();
    StoredInBlock(before, after, b, n, c);
    NotOwnBlock(d, b);
    InstalledFrame(before, after, d, {b});
    SameExceptTrans(m, before, after, TableBlocks(d) + {b}, {b});
    assert TableBlocks(d) + {b} + {b} == TableBlocks(d) + {b};
    BorrowedAgain(memory, d, b, m, pages);
  }

  lemma BorrowedTranslates(pages: seq<Word>, b: nat, n: nat)
    requires |pages| == PAGES && b < HEAP_BLOCKS && n < PAGE_SIZE
    ensures Translate(pages[BlockFrame(b) := Addr(b) + USER_RW], Addr(b) + n) == Addr(b) + n
  {
    assert (Addr(b) + n) / PAGE_SIZE == BlockFrame(b) && (Addr(b) + n) % PAGE_SIZE == n;
    assert FrameOf(Addr(b) + USER_RW) == BlockFrame(b);
  }

  lemma StoredInBlock(m: Mem, m': Mem, b: nat, n: nat, c: Word)
    requires b < HEAP_BLOCKS && n < PAGE_SIZE
    requires m' == Stored(m, Addr(b) + n, c)
    ensures SameExcept(m, m', {b}) && m'[BlockFrame(b)] == m[BlockFrame(b)][n := c]
  {
    assert (Addr(b) + n) / PAGE_SIZE == BlockFrame(b) && (Addr(b) + n) % PAGE_SIZE == n;
  }

  lemma BorrowedRam(memory: Memory, d: Dir, b: nat, m: Mem, pages: seq<Word>)
    requires |pages| == PAGES && Borrowed(memory, d, b, m, pages)
    ensures memory.ram.Length == PAGES && b < HEAP_BLOCKS && b !in DirBlocks(d)
    ensures Installed(memory.Ram(), d) && Flat(memory.Ram(), d) == pages[BlockFrame(b) := Addr(b) + USER_RW]
    ensures SameExcept(m, memory.Ram(), TableBlocks(d) + {b})
  {
  }

  lemma BorrowedAgain(memory: Memory, d: Dir, b: nat, m: Mem, pages: seq<Word>)
    requires |pages| == PAGES && memory.ram.Length == PAGES && b < HEAP_BLOCKS && b !in DirBlocks(d)
    requires Installed(memory.Ram(), d) && Flat(memory.Ram(), d) == pages[BlockFrame(b) := Addr(b) + USER_RW]
    requires SameExcept(m, memory.Ram(), TableBlocks(d) + {b})
    ensures Borrowed(memory, d, b, m, pages)
  {
  }

  lemma NotOwnBlock(d: Dir, b: nat)
    requires b !in DirBlocks(d)
    ensures d.chunk != b && d.dir != b && {b} !! TableBlocks(d)
  {
  }

  /** strncpy(tmp, virtual, max) while the task's directory is loaded. */
  method StrncpyFromUser(memory: Memory, directory: Word, tmp: Word, virt: Word, max: nat,
                         ghost d: Dir, ghost b: nat, ghost m: Mem, ghost pages: seq<Word>)
    returns (n: nat)
    requires |pages| == PAGES && Borrowed(memory, d, b, m, pages) && directory == Addr(d.dir) && tmp == Addr(b)
    requires 0 < max < PAGE_SIZE && ClearOf(m, pages, virt, max, b, TableBlocks(d) + {b})
    modifies memory.ram
    ensures Borrowed(memory, d, b, m, pages) && n < max
    ensures Copied(memory.Ram()[BlockFrame(b)][..n + 1], m, pages, virt, max)
  {
    hide Installed, Flat, DirBlocks, Seen, Borrowed, CharAt, ClearOf, TableBlocks, SameExcept, Copied;
    BorrowedRam(memory, d, b, m, pages);
    n := 0;
    while n < max - 1
      invariant n < max && Borrowed(memory, d, b, m, pages)
      invariant Transferred(memory.Ram()[BlockFrame(b)], m, pages, virt, n)
      decreases max - n
    {
      NotEndedYet(memory.Ram()[BlockFrame(b)], m, pages, virt, n);
      var c := LoadChar(memory, directory, virt, max, n, d, b, m, pages);
      if c == 0 {
        break;
      }
      StoreChar(memory, directory, tmp, n, c, d, b, m, pages);
      n := n + 1;
    }
    StoreChar(memory, directory, tmp, n, 0, d, b, m, pages);
    AllTransferred(memory.Ram()[BlockFrame(b)], m, pages, virt, n, max);
  }

  /** The first n cells of the borrowed page are the first n characters of the string. */
  ghost predicate Transferred(page: Frame, m: Mem, pages: seq<Word>, virt: Word, n: nat)
    requires |pages| == PAGES
  {
    n < PAGE_SIZE && forall i :: 0 <= i < n ==> page[i] == CharAt(m, pages, virt, i) != 0
  }

  lemma NotEndedYet(page: Frame, m: Mem, pages: seq<Word>, virt: Word, n: nat)
    requires |pages| == PAGES && Transferred(page, m, pages, virt, n)
    ensures NotEnded(m, pages, virt, n)
  {
    hide CharAt;
  }

  lemma AllTransferred(page: Frame, m: Mem, pages: seq<Word>, virt: Word, n: nat, max: nat)
    requires |pages| == PAGES && Transferred(page, m, pages, virt, n) && page[n] == 0 && n < max
    requires n == max - 1 || CharAt(m, pages, virt, n) == 0
    ensures Copied(page[..n + 1], m, pages, virt, max)
  {
    hide CharAt;
  }

  /** One character read through the task's directory. */
  method LoadChar(memory: Memory, directory: Word, virt: Word, max: nat, n: nat, ghost d: Dir, ghost b: nat,
      ghost m: Mem, ghost pages: seq<Word>) returns (c: Word)
    requires |pages| == PAGES && Borrowed(memory, d, b, m, pages) && directory == Addr(d.dir)
    requires ClearOf(m, pages, virt, max, b, TableBlocks(d) + {b}) && n + 1 < max && NotEnded(m, pages, virt, n)
    ensures c == CharAt(m, pages, virt, n)
  {
    hide Installed, Flat, DirBlocks, Seen, TableBlocks, SameExcept;
    var va := Wrap(virt + n);
    assert CharClear(pages, virt, n, b, TableBlocks(d) + {b});
    SeenElsewhere(m, memory.Ram(), pages, va, b, Addr(b) + USER_RW, TableBlocks(d) + {b});
    LoadIsSeen(memory, d, va);
    c := memory.Load(memory.GetPhysicalAddress(directory, va));
  }

  lemma LoadIsSeen(memory: Memory, d: Dir, va: Word)
    requires memory.ram.Length == PAGES && Installed(memory.Ram(), d)
    ensures memory.Load(memory.GetPhysicalAddress(Addr(d.dir), va)) == Seen(memory.Ram(), Flat(memory.Ram(), d), va)
  {
    memory.GetPhysicalAddressTranslates(d, va);
  }

  /** strncpy(phys, tmp, max) back under the kernel's own directory, which maps every page
      to itself. */
  method StrncpyFromKernel(memory: Memory, tmp: Word, out: array<Word>, max: nat, ghost n: nat, ghost b: nat)
    requires memory.ram.Length == PAGES && tmp == Addr(b) && b < HEAP_BLOCKS && out as object != memory.ram
    requires 0 < max < PAGE_SIZE && max <= out.Length && n < max && memory.Ram()[BlockFrame(b)][n] == 0
    requires forall i :: 0 <= i < n ==> memory.Ram()[BlockFrame(b)][i] != 0
    modifies out
    ensures out[..n + 1] == memory.Ram()[BlockFrame(b)][..n + 1]
  {
    var i := 0;
    while i < max - 1
      invariant i <= n && out[..i] == memory.Ram()[BlockFrame(b)][..i]
      decreases max - i
    {
      var c := memory.Load(tmp + i);
      if c == 0 {
        break;
      }
      out[i] := c;
      i := i + 1;
    }
    out[i] := 0;
  }

  /** copy_string_from_task: the task's page map and the heap are left as they were, and on
      success the buffer holds the string as the task sees it, cut to max - 1 characters.
      b is the block kzalloc will lend. */
  method CopyStringFromTask(memory: Memory, chunk: Word, virt: Word, out: array<Word>, max: int,
      ghost d: Dir) returns (res: int, ghost n: nat)
    requires memory.Valid() && Installed(memory.Ram(), d) && chunk == Addr(d.chunk)
    requires DirBlocks(d) <= memory.heap.runs.Keys
    requires out as object != memory.ram && out as object != memory.heap.entries && max <= out.Length
    requires -0x8000_0000 <= max < 0x8000_0000
    requires var b := FirstFit(memory.heap.runs, HEAP_BLOCKS, 1);
      b != -1 && 0 < max < PAGE_SIZE ==>
        ClearOf(memory.Ram(), Flat(memory.Ram(), d), virt, max, b, TableBlocks(d) + {b})
    modifies memory.heap`runs, memory.heap.entries, memory.ram, out
    ensures memory.Valid() && Installed(memory.Ram(), d)
    ensures Flat(memory.Ram(), d) == Flat(old(memory.Ram()), d) && memory.heap.runs == old(memory.heap.runs)
    ensures var b := FirstFit(old(memory.heap.runs), HEAP_BLOCKS, 1);
      if max >= PAGE_SIZE then res == -EINVARG
      else if max <= 0 || b == -1 then res == -ENOMEM
      else
        && res == 0 && n < max && Copied(out[..n + 1], old(memory.Ram()), Flat(old(memory.Ram()), d), virt, max)
        && SameExcept(old(memory.Ram()), memory.Ram(), TableBlocks(d) + {b})
    ensures res < 0 ==> out[..] == old(out[..]) && memory.Ram() == old(memory.Ram())
  {
    hide Installed, Flat, DirBlocks, Copied, ClearOf, Encoded, SameExcept, FirstFit, TableBlocks, Heap.Valid, Blocks,
      Partition, RunBlocks, DistinctDir;
    n := 0;
    if max >= PAGE_SIZE {
      return -EINVARG, 0;
    }
    ghost var m, r, fit := memory.Ram(), memory.heap.runs, FirstFit(memory.heap.runs, HEAP_BLOCKS, 1);
    InstalledKnown(m, d);
    OnePage(r, max);
    HeapIsPartition(memory);
    var tmp := memory.Kzalloc(Wrap(max));
    if tmp == 0 {
      return -ENOMEM, 0;
    }
    NewBlock(r, d, fit);
    n := CopyThrough(memory, chunk, tmp, virt, out, max, d, fit, m);
    res := 0;
    memory.Kfree(tmp, fit);
  }

  lemma HeapIsPartition(memory: Memory)
    requires memory.Valid()
    ensures Partition(memory.heap.runs, HEAP_BLOCKS)
  {
  }

  /** The body of copy_string_from_task between kzalloc and kfree. */
  method CopyThrough(memory: Memory, chunk: Word, tmp: Word, virt: Word, out: array<Word>, max: nat, ghost d: Dir,
      ghost b: nat, ghost m: Mem)
    returns (n: nat)
    requires memory.ram.Length == PAGES && Installed(m, d) && chunk == Addr(d.chunk) && tmp == Addr(b)
    requires b < HEAP_BLOCKS && b !in DirBlocks(d) && SameExcept(m, memory.Ram(), {b})
    requires out as object != memory.ram && 0 < max < PAGE_SIZE && max <= out.Length
    requires ClearOf(m, Flat(m, d), virt, max, b, TableBlocks(d) + {b})
    modifies memory.ram, out
    ensures Installed(memory.Ram(), d) && Flat(memory.Ram(), d) == Flat(m, d)
    ensures SameExcept(m, memory.Ram(), TableBlocks(d) + {b})
    ensures n < max && Copied(out[..n + 1], m, Flat(m, d), virt, max)
  {
    hide Installed, DirBlocks, ClearOf, SameExcept, Flat;
    InstalledKnown(m, d);
    ghost var pages := Flat(m, d);
    var oldEntry := Borrow(memory, chunk, tmp, d, b, m);
    InstalledKnown(memory.Ram(), d);
    var directory := memory.Load(chunk);
    n := StrncpyFromUser(memory, directory, tmp, virt, max, d, b, m, pages);
    ghost var m2 := memory.Ram();
    var restored := memory.Set(directory, tmp, oldEntry, d);
    SameExceptTrans(m, m2, memory.Ram(), TableBlocks(d) + {b}, TableBlocks(d));
    assert TableBlocks(d) + {b} + TableBlocks(d) == TableBlocks(d) + {b};
    assert pages[BlockFrame(b) := Addr(b) + USER_RW][BlockFrame(b) := oldEntry] == pages;
    SameBlock(m2, memory.Ram(), d, b);
    StrncpyFromKernel(memory, tmp, out, max, n, b);
  }

  lemma SameBlock(m: Mem, m': Mem, d: Dir, b: nat)
    requires SameExcept(m, m', TableBlocks(d)) && b !in DirBlocks(d) && b < HEAP_BLOCKS
    ensures m'[BlockFrame(b)] == m[BlockFrame(b)]
  {
    NotOwnBlock(d, b);
  }

  /** Remember the task's word for page tmp and map the page to itself, writable. */
  method Borrow(memory: Memory, chunk: Word, tmp: Word, ghost d: Dir, ghost b: nat,
      ghost m: Mem) returns (oldEntry: Word)
    requires memory.ram.Length == PAGES && Installed(m, d) && chunk == Addr(d.chunk) && tmp == Addr(b)
    requires b < HEAP_BLOCKS && b !in DirBlocks(d) && SameExcept(m, memory.Ram(), {b})
    modifies memory.ram
    ensures Borrowed(memory, d, b, m, Flat(m, d)) && oldEntry == Flat(m, d)[BlockFrame(b)]
  {
    hide Installed, DirBlocks, SameExcept, Flat;
    NotOwnBlock(d, b);
    InstalledFrame(m, memory.Ram(), d, {b});
    InstalledKnown(memory.Ram(), d);
    var directory := memory.Load(chunk);
    memory.GetIsFlat(d, tmp);
    oldEntry := memory.Get(directory, tmp);
    OrFlags(BlockFrame(b), 0, USER_RW);
    ghost var m1 := memory.Ram();
    var mapped := memory.Map(chunk, tmp, tmp, USER_RW, d);
    SameExceptTrans(m, m1, memory.Ram(), {b}, TableBlocks(d));
    assert {b} + TableBlocks(d) == TableBlocks(d) + {b};
  }

  lemma InstalledKnown(m: Mem, d: Dir)
    requires Installed(m, d)
    ensures DistinctDir(d) && m[BlockFrame(d.chunk)][0] == Addr(d.dir)
  {
  }

  /** A request below a page is for one block; zero and negative ones find none. */
  lemma OnePage(r: Runs, max: int)
    requires -0x8000_0000 <= max < PAGE_SIZE
    ensures max > 0 ==> Blocks(Wrap(max)) == 1
    ensures max <= 0 ==> FirstFit(r, HEAP_BLOCKS, Blocks(Wrap(max))) == -1
  {
  }

  lemma NewBlock(r: Runs, d: Dir, b: int)
    requires DirBlocks(d) <= r.Keys && b == FirstFit(r, HEAP_BLOCKS, 1) && b != -1 && Partition(r, HEAP_BLOCKS)
    ensures 0 <= b < HEAP_BLOCKS && b !in DirBlocks(d) && b !in r && r[b := 1] - {b} == r
    ensures RunBlocks(b, 1) == {b}
  {
    PartitionAdd(r, HEAP_BLOCKS, b, 1);
  }
}
