/** The page map of a freshly loaded process, and exactly when it lets the process write
    only what is its own: src/task/process.c:405-462, which compares no header with the
    file. */
module LoadedPages {
  import opened Machine
  import opened HeapRuns
  import opened Heap
  import opened PageTables
  import opened Elf
  import opened System
  import opened Invariants

  ghost function NewProc(l: Loading, pages: seq<Word>): Proc
    requires l.Complete?
  {
    Proc(l.record, l.elf, l.image, l.memory, l.stack, l.task, l.dir, EmptyLedger(), pages)
  }

  /** A freshly loaded process is well formed and owns exactly the runs its load made. */
  lemma NewProcOk(r: Runs, l: Loading, size: Word, pages: seq<Word>)
    requires l.Complete? && FreshLoading(r, l, size) && |pages| == PAGES
    ensures var (r', p) := (r + LoadingRuns(l, size), NewProc(l, pages));
      ProcOk(r', p) && LedgerMapped(r', p) && Owned(p) == LoadingRuns(l, size).Keys && LedgerBlocks(p.ledger) == {}
  {
    hide Partition, DistinctDir, LoadingRuns, DirBlocks, ProgramRuns;
    var r', p := r + LoadingRuns(l, size), NewProc(l, pages);
    CompleteParts(l, size);
    assert LedgerBlocks(p.ledger) == {};
    assert PartsLive(r', p);
  }

  /** The runs of a complete load, one by one. */
  lemma CompleteParts(l: Loading, size: Word)
    requires l.Complete? && DistinctParts(l.record, l.elf, l.image, l.stack, l.task, l.dir)
    ensures var all := LoadingRuns(l, size);
      && all.Keys == {l.record, l.elf, l.stack, l.task} + ImageRun(l.image) + DirBlocks(l.dir)
      && all[l.record] == PROCESS_BLOCKS && all[l.stack] == STACK_BLOCKS && all[l.task] == TASK_BLOCKS
      && (l.image.Some? ==> all[l.elf] == ELF_FILE_BLOCKS)
      && forall b :: b in DirBlocks(l.dir) ==> all[b] == 1
  {
    hide DistinctDir, DirBlocks;
  }

  lemma StackIsRun(stack: nat)
    requires stack < HEAP_BLOCKS
    ensures StackAddress(Addr(stack))
  {
  }

  lemma MemoryKnown(r: Runs, l: Loading, size: Word)
    requires l.Complete? && FreshLoading(r, l, size)
    ensures l.image.Some? ==> l.image.value < HEAP_BLOCKS && l.memory == Addr(l.image.value)
  {
  }

  /** The runs a new process can write: its file's blocks, if it has any, and its stack. */
  lemma PartRuns(r: Runs, l: Loading, size: Word)
    requires l.Complete? && FreshLoading(r, l, size)
    ensures var r' := r + LoadingRuns(l, size);
      && Live(r', l.stack, STACK_BLOCKS) && l.stack + STACK_BLOCKS <= HEAP_BLOCKS
      && (l.image.Some? ==> Live(r', l.image.value, Blocks(size)) && l.image.value + Blocks(size) <= HEAP_BLOCKS)
  {
    hide DistinctDir;
    var r' := r + LoadingRuns(l, size);
    assert l.stack in r' && ImageRun(l.image) <= r'.Keys;
  }

  // --- Page by page -------------------------------------------------------------------------------

  /** The load l of img succeeds on a heap with runs r and gives the new process this page
      map. */
  ghost predicate Maps(r: Runs, img: Image, l: Loading, pages: seq<Word>) {
    && l.Complete? && FreshLoading(r, l, img.size) && l.stack < HEAP_BLOCKS
    && (pages, 0) == MapMemory(Identity(IS_PRESENT + ACCESS_FROM_ALL), l.memory, img.phdrs, Addr(l.stack))
  }

  /** Segment i is writable and decides page v. */
  ghost predicate WritesPage(memory: Word, phdrs: seq<Phdr>, v: int, i: int) {
    Decides(memory, phdrs, v, i) && WantsWrite(phdrs[i])
  }

  /** Page v of segment ph lands in the image or in the stack of the new process. */
  ghost predicate LandsInside(r: Runs, l: Loading, ph: Phdr, v: int)
    requires l.Complete?
  {
    var c := SegmentFrame(l.memory, ph, v) - HEAP_FRAME;
    InImage(r, l.image, c) || Covers(r, l.stack, c)
  }

  /** Every page a writable segment decides lands in the new process's own memory. */
  ghost predicate AllLandInside(r: Runs, img: Image, l: Loading)
    requires l.Complete?
  {
    forall i, v :: 0 <= i < |img.phdrs| && WritesPage(l.memory, img.phdrs, v, i) ==>
      LandsInside(r, l, img.phdrs[i], v)
  }

  /** Whatever the headers, overlapping, wrapping or with a negative p_offset: once the
      loader has mapped them, the new process is isolated exactly when each page a writable
      segment decides lies in the process's own image or stack. For raw bytes there is no
      image, and memory is whatever they hold. */
  lemma LoadIsolatesIff(r: Runs, img: Image, l: Loading, pages: seq<Word>)
    requires Maps(r, img, l, pages)
    ensures |pages| == PAGES
    ensures var r' := r + LoadingRuns(l, img.size);
      Isolated(r', NewProc(l, pages)) <==> AllLandInside(r', img, l)
  {
    hide FreshLoading, LoadingRuns, MapMemory, Identity, InSegment, SegmentWord, StackWord, Covers, Isolated,
      LandsInside, Blocks;
    var r', p := r + LoadingRuns(l, img.size), NewProc(l, pages);
    PartRuns(r, l, img.size);
    NewProcOk(r, l, img.size, pages);
    if Isolated(r', p) {
      forall i, v | 0 <= i < |img.phdrs| && WritesPage(l.memory, img.phdrs, v, i)
        ensures LandsInside(r', l, img.phdrs[i], v)
      {
        DecidedPage(l.memory, img.phdrs, v, i);
        LoadedWord(r, img, l, pages, v);
        SegmentPageOwned(r', l, pages, img.phdrs[i], v);
      }
    }
    if AllLandInside(r', img, l) {
      forall v: nat | v < PAGES
        ensures Writable(pages[v]) ==> OwnPage(r', p, v, FrameOf(pages[v]) - HEAP_FRAME)
      {
        LoadedWord(r, img, l, pages, v);
        if i :| 0 <= i < |img.phdrs| && Decides(l.memory, img.phdrs, v, i) {
          SegmentPageIsOwn(r', l, pages, img.phdrs[i], v);
        } else {
          OtherPageIsOwn(r', l, pages, v);
        }
      }
      IsolatedFromPages(r', p);
    }
  }

  lemma DecidedPage(memory: Word, phdrs: seq<Phdr>, v: int, i: int)
    requires Decides(memory, phdrs, v, i)
    ensures 0 <= i < |phdrs| && 0 <= v < PAGES && !OnStackPage(v)
  {
  }

  /** The word of any page of a freshly loaded program. */
  lemma LoadedWord(r: Runs, img: Image, l: Loading, pages: seq<Word>, v: nat)
    requires Maps(r, img, l, pages) && v < PAGES
    ensures |pages| == PAGES && AllAccepted(l.memory, img.phdrs)
    ensures OnStackPage(v) ==> pages[v] == StackWord(Addr(l.stack), v)
    ensures forall i :: 0 <= i < |img.phdrs| && Decides(l.memory, img.phdrs, v, i) ==>
      pages[v] == SegmentWord(l.memory, img.phdrs[i], v)
    ensures !OnStackPage(v) && (forall i :: 0 <= i < |img.phdrs| ==> !Decides(l.memory, img.phdrs, v, i)) ==>
      pages[v] == Identity(IS_PRESENT + ACCESS_FROM_ALL)[v]
  {
    hide FreshLoading, InSegment, SegmentWord, StackWord, MapMemory, StackAddress, Identity, AllAccepted, OnStackPage;
    StackIsRun(l.stack);
    MapMemoryAt(Identity(IS_PRESENT + ACCESS_FROM_ALL), l.memory, img.phdrs, Addr(l.stack), v);
  }

  /** No page of a freshly loaded program is out of its reach: those of the stack and those a
      segment with PF_W decides are present, writable and the user's (7), all others present
      and the user's (5), and where no segment decides the address is physical. */
  lemma PageRights(r: Runs, img: Image, l: Loading, pages: seq<Word>, v: nat)
    requires Maps(r, img, l, pages) && v < PAGES
    ensures |pages| == PAGES
    ensures 0x3FB <= v < 0x3FF ==> pages[v] % 8 == 7
    ensures forall i :: 0 <= i < |img.phdrs| && Decides(l.memory, img.phdrs, v, i) ==>
      pages[v] % 8 == if img.phdrs[i].flags / 2 % 2 == 1 then 7 else 5
    ensures !(0x3FB <= v < 0x3FF) && (forall i :: 0 <= i < |img.phdrs| ==> !Decides(l.memory, img.phdrs, v, i)) ==>
      pages[v] % 8 == 5 && FrameOf(pages[v]) == v
  {
    hide FreshLoading, InSegment, StackWord, MapMemory, AllAccepted, SegmentFrame;
    LoadedWord(r, img, l, pages, v);
    forall i | 0 <= i < |img.phdrs| && Decides(l.memory, img.phdrs, v, i)
      ensures pages[v] % 8 == if img.phdrs[i].flags / 2 % 2 == 1 then 7 else 5
    {
      WordParts(SegmentFrame(l.memory, img.phdrs[i], v), SegmentFlags(img.phdrs[i]));
    }
    if OnStackPage(v) { StackBits(Addr(l.stack), v); }
    WordParts(v, 5);
  }

  lemma StackBits(stack: Word, v: nat)
    ensures StackWord(stack, v) % 8 == 7
  {
    WordParts(stack / PAGE_SIZE + v - STACK_END / PAGE_SIZE, USER_RW);
  }

  lemma IsolatedFromPages(r: Runs, p: Proc)
    requires |p.pages| == PAGES
    requires forall v: nat :: v < PAGES && Writable(p.pages[v]) ==> OwnPage(r, p, v, FrameOf(p.pages[v]) - HEAP_FRAME)
    ensures Isolated(r, p)
  {
  }

  lemma SegmentEntry(memory: Word, ph: Phdr, v: nat, entry: Word)
    requires entry == SegmentWord(memory, ph, v)
    ensures FrameOf(entry) == SegmentFrame(memory, ph, v)
    ensures Writable(entry) <==> WantsWrite(ph)
  {
    hide SegmentFrame, WantsWrite;
    WordParts(SegmentFrame(memory, ph, v), SegmentFlags(ph));
  }

  lemma SegmentPageOwned(r: Runs, l: Loading, pages: seq<Word>, ph: Phdr, v: nat)
    requires l.Complete? && |pages| == PAGES && v < PAGES && WantsWrite(ph)
    requires pages[v] == SegmentWord(l.memory, ph, v) && Isolated(r, NewProc(l, pages))
    requires LedgerBlocks(EmptyLedger()) == {}
    ensures LandsInside(r, l, ph, v)
  {
    hide SegmentFrame, WantsWrite, Writable, Covers;
    SegmentEntry(l.memory, ph, v, pages[v]);
  }

  lemma SegmentPageIsOwn(r: Runs, l: Loading, pages: seq<Word>, ph: Phdr, v: nat)
    requires l.Complete? && |pages| == PAGES && v < PAGES
    requires pages[v] == SegmentWord(l.memory, ph, v) && (WantsWrite(ph) ==> LandsInside(r, l, ph, v))
    ensures Writable(pages[v]) ==> OwnPage(r, NewProc(l, pages), v, FrameOf(pages[v]) - HEAP_FRAME)
  {
    hide SegmentFrame, WantsWrite, Writable, Covers;
    SegmentEntry(l.memory, ph, v, pages[v]);
  }

  lemma OtherPageIsOwn(r: Runs, l: Loading, pages: seq<Word>, v: nat)
    requires l.Complete? && |pages| == PAGES && v < PAGES && l.stack + STACK_BLOCKS <= HEAP_BLOCKS
    requires Live(r, l.stack, STACK_BLOCKS)
    requires OnStackPage(v) ==> pages[v] == StackWord(Addr(l.stack), v)
    requires !OnStackPage(v) ==> pages[v] == Identity(IS_PRESENT + ACCESS_FROM_ALL)[v]
    ensures Writable(pages[v]) ==> OwnPage(r, NewProc(l, pages), v, FrameOf(pages[v]) - HEAP_FRAME)
  {
    WordParts(v, IS_PRESENT + ACCESS_FROM_ALL);
    if OnStackPage(v) {
      WordParts(Addr(l.stack) / PAGE_SIZE + v - STACK_END / PAGE_SIZE, USER_RW);
    }
  }

  // --- From the headers and the file's length alone -----------------------------------------------

  /** The page of the file, counted from its start in 32 bits, that the loader maps at page v
      of the segment. */
  ghost function FilePage(ph: Phdr, v: int): nat {
    (ph.offset / PAGE_SIZE + Ahead(ph.vaddr / PAGE_SIZE, v)) % PAGES
  }

  /** Every page a writable segment decides is one of the file's own. Where the file lies
      does not matter, as runs start at page boundaries. */
  ghost predicate InsideFile(img: Image) {
    forall i, v :: 0 <= i < |img.phdrs| && WritesPage(0, img.phdrs, v, i) ==>
      FilePage(img.phdrs[i], v) < Blocks(img.size)
  }

  /** Moving the file by whole pages moves its segments and keeps their pages. */
  lemma SegmentMoved(image: nat, ph: Phdr)
    requires image < HEAP_BLOCKS
    ensures FirstFrame(Addr(image), ph) == (HEAP_FRAME + image + ph.offset / PAGE_SIZE) % PAGES
    ensures forall v: int :: InSegment(Addr(image), ph, v) <==> InSegment(0, ph, v)
  {
    hide Ahead;
    var f, o := ph.offset / PAGE_SIZE, ph.offset % PAGE_SIZE;
    assert Addr(image) + ph.offset == (HEAP_FRAME + image + f) * PAGE_SIZE + o;
    assert PhysAddress(Addr(image), ph) == (HEAP_FRAME + image + f) % PAGES * PAGE_SIZE + o;
    assert PhysAddress(0, ph) == ph.offset;
  }

  lemma WritesMoved(image: nat, phdrs: seq<Phdr>, v: int, i: int)
    requires image < HEAP_BLOCKS
    ensures WritesPage(Addr(image), phdrs, v, i) <==> WritesPage(0, phdrs, v, i)
  {
    hide InSegment, WantsWrite, OnStackPage;
    forall j | 0 <= j < |phdrs| ensures InSegment(Addr(image), phdrs[j], v) <==> InSegment(0, phdrs[j], v) {
      SegmentMoved(image, phdrs[j]);
    }
  }

  /** A page of an accepted segment lands in the image exactly when it is one of the file's. */
  lemma LandsInImageIff(image: nat, n: nat, ph: Phdr, v: int)
    requires image + n <= HEAP_BLOCKS && image < HEAP_BLOCKS && Accepted(Addr(image), ph)
    requires InSegment(Addr(image), ph, v)
    ensures SegmentFrame(Addr(image), ph, v) < PAGES
    ensures image <= SegmentFrame(Addr(image), ph, v) - HEAP_FRAME < image + n <==> FilePage(ph, v) < n
  {
    hide FirstFrame, PageCount, Ahead;
    SegmentMoved(image, ph);
    SameRest(ph.offset / PAGE_SIZE + Ahead(ph.vaddr / PAGE_SIZE, v), SegmentFrame(Addr(image), ph, v),
      HEAP_FRAME + image, n);
  }

  lemma SameRest(d: nat, f: nat, base: nat, n: nat)
    requires f < PAGES && f == (base + d) % PAGES && base + n <= PAGES
    ensures base <= f < base + n <==> d % PAGES < n
  {
    var e := d % PAGES;
    assert f == (base + e) % PAGES;
  }

  /** The load gives its process no writable page that is not its own. */
  ghost predicate SafeLoad(img: Image, l: Loading) {
    match l
    case Complete(_, _, image, memory, _, _, _) =>
      if image.Some? then InsideFile(img) else NoneWritable(img, memory)
    case Raw(_, _, rest) => SafeLoad(img, rest)
    case _ => true
  }

  ghost predicate NoneWritable(img: Image, memory: Word) {
    forall i, v :: 0 <= i < |img.phdrs| ==> !WritesPage(memory, img.phdrs, v, i)
  }

  /** A file whose writable pages are its own can be loaded, wherever it lies, without giving
      the new process a writable page outside its own image and stack. */
  lemma InsideIsIsolated(r: Runs, img: Image, l: Loading, pages: seq<Word>)
    requires Maps(r, img, l, pages) && SafeLoad(img, l)
    ensures |pages| == PAGES && Isolated(r + LoadingRuns(l, img.size), NewProc(l, pages))
  {
    hide FreshLoading, LoadingRuns, MapMemory, Isolated, WritesPage, Blocks, InImage, Covers;
    var r' := r + LoadingRuns(l, img.size);
    forall i, v | 0 <= i < |img.phdrs| && WritesPage(l.memory, img.phdrs, v, i)
      ensures LandsInside(r', l, img.phdrs[i], v)
    {
      PageInImage(r, img, l, pages, v, i);
    }
    LoadIsolatesIff(r, img, l, pages);
  }

  lemma PageInImage(r: Runs, img: Image, l: Loading, pages: seq<Word>, v: int, i: int)
    requires Maps(r, img, l, pages) && WritesPage(l.memory, img.phdrs, v, i) && l.image.Some?
    ensures |pages| == PAGES && 0 <= i < |img.phdrs| && 0 <= v < PAGES && WritesPage(0, img.phdrs, v, i)
    ensures Accepted(l.memory, img.phdrs[i])
    ensures InImage(r + LoadingRuns(l, img.size), l.image, SegmentFrame(l.memory, img.phdrs[i], v) - HEAP_FRAME)
      <==> FilePage(img.phdrs[i], v) < Blocks(img.size)
  {
    hide FreshLoading, LoadingRuns, MapMemory, Blocks, InSegment, SegmentFrame, FilePage, Accepted, WantsWrite;
    DecidedPage(l.memory, img.phdrs, v, i);
    LoadedWord(r, img, l, pages, v);
    PartRuns(r, l, img.size);
    MemoryKnown(r, l, img.size);
    WritesMoved(l.image.value, img.phdrs, v, i);
    LandsInImageIff(l.image.value, Blocks(img.size), img.phdrs[i], v);
  }

  // --- A check on each header -------------------------------------------------------------------------

  /** The segment ends within the first n pages of the file. */
  ghost predicate EndsWithin(ph: Phdr, n: nat) {
    ph.offset + ph.memsz <= n * PAGE_SIZE
  }

  /** A check on each header by itself that is enough: every writable segment ends within the
      file's blocks. */
  lemma EndingIsInside(img: Image)
    requires Blocks(img.size) > 0
    requires forall ph :: ph in img.phdrs && WantsWrite(ph) ==> EndsWithin(ph, Blocks(img.size))
    ensures InsideFile(img)
  {
    hide Blocks, InSegment, FilePage, WantsWrite, EndsWithin;
    forall i, v | 0 <= i < |img.phdrs| && WritesPage(0, img.phdrs, v, i)
      ensures FilePage(img.phdrs[i], v) < Blocks(img.size)
    {
      PageWithin(img.phdrs[i], v, Blocks(img.size));
    }
  }

  lemma PageWithin(ph: Phdr, v: int, n: nat)
    requires EndsWithin(ph, n) && InSegment(0, ph, v) && n > 0
    ensures FilePage(ph, v) < n
  {
    hide Ahead;
    var f, o := ph.offset / PAGE_SIZE, ph.offset % PAGE_SIZE;
    assert PhysAddress(0, ph) == ph.offset == f * PAGE_SIZE + o;
    var count := (o + ph.memsz + PAGE_SIZE - 1) / PAGE_SIZE;
    assert f + count <= n;
  }
}
